/** The Room type converters between a nullable epoch timestamp and a
    nullable java.util.Date. A Date is a wrapper around a signed 64-bit
    millisecond count, which is why the rest of the model keeps task dates
    as integers. */
module Converters {
  import opened Tasks

  /** A Kotlin Long. */
  type Long = x: int | -0x8000_0000_0000_0000 <= x < 0x8000_0000_0000_0000

  /** java.util.Date(ms), observed through its `time` property. */
  datatype Date = Date(time: Long)

  /** `timestamp?.let { Date(timestamp) }`: null stays null, a timestamp
      becomes the date with those milliseconds. */
  function ToDate(timestamp: Option<Long>): (date: Option<Date>)
    ensures date.None? <==> timestamp.None?
    ensures timestamp.Some? ==> date.value.time == timestamp.value
  {
    match timestamp
    case None => None
    case Some(ms) => Some(Date(ms))
  }

  /** `date?.time`: null stays null, a date gives back its milliseconds. */
  function ToTimestamp(date: Option<Date>): (timestamp: Option<Long>)
    ensures timestamp.None? <==> date.None?
    ensures date.Some? ==> timestamp.value == date.value.time
  {
    match date
    case None => None
    case Some(d) => Some(d.time)
  }

  /** Storing a timestamp and reading it back loses nothing, null included. */
  lemma TimestampRoundTrip(timestamp: Option<Long>)
    ensures ToTimestamp(ToDate(timestamp)) == timestamp
  {
  }

  /** Reading a date back from its stored timestamp gives the same date. */
  lemma DateRoundTrip(date: Option<Date>)
    ensures ToDate(ToTimestamp(date)) == date
  {
  }
}
