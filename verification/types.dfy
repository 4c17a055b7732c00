/** The records of the countdown site (types.ts). */
module Types {
  import opened Wrappers

  /** Time left until the launch, one field per unit. */
  datatype CountDownTime = CountDownTime(days: int, hours: int, minutes: int, seconds: int)

  /** The all-zero countdown shown before the first calculation and after the launch. */
  const Zero := CountDownTime(0, 0, 0, 0)

  /** The two display languages. */
  datatype Language = En | Es

  datatype MilestoneCategory = Announcement | Development | Technical | Community | Blog

  /** A timeline entry. `date` is the entry's instant in epoch milliseconds;
      `major` is the optional flag, absent meaning minor. */
  datatype Milestone = Milestone(
    date: int,
    year: string,
    title: string,
    url: Option<string>,
    major: Option<bool>,
    category: MilestoneCategory)

  /** The translated unit names used under the digits. */
  datatype TimeNames = TimeNames(days: string, hours: string, minutes: string, seconds: string, finished: string)
}
