/** Shared data definitions of the kiosk: the record shapes the front end
    passes between its screens, the view selector of the application shell,
    and the compile-time configuration. */
module Types {

  datatype Option<+T> = None | Some(value: T)

  datatype Result<+T, +E> = Success(value: T) | Failure(error: E)

  /** The screen the application shell shows. */
  datatype ViewMode = CHECK_IN | SUCCESS | ADMIN

  /** A check-in entry as the front end holds it: the identifier is already a
      string, and the personalized letter may be absent. */
  datatype StudentRecord = StudentRecord(
    id: string,
    name: string,
    email: string,
    checkInTime: string,
    personalizedLetter: Option<string>)

  /** One point of the daily check-in series. */
  datatype AnalyticsData = AnalyticsData(date: string, count: int)

  // The application configuration.
  const DepartmentName: string := "ABC Department"
  const Year: string := "2026"
  const DeptWebsite: string := "https://abc-dept.university.edu"
  const ApplyUrl: string := "https://admissions.university.edu/apply"
  /** Number of logo clicks that open the hidden admin dashboard. */
  const AdminEntryClicks: nat := 5
}
