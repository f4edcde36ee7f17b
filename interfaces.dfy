/** The records the components pass around: the shapes of the Subject,
    Task and Teacher interfaces and of the registered-user objects the
    database service stores. */
module Interfaces {

  datatype Option<T> = None | Some(value: T)

  /** A subject a teacher can teach, with its hourly pay rate. */
  datatype Subject = Subject(subjectName: string, payPerHour: real)

  /** A tutoring session. `date` is a calendar day number (day 0 is
      1970-01-01); `startTime`/`endTime` are the "HH:MM" texts the form
      produced; `createdAt` is a timestamp in milliseconds. */
  datatype Task = Task(
    id: string,
    title: string,
    description: string,
    date: int,
    day: string,
    startTime: string,
    endTime: string,
    completed: bool,
    createdAt: int,
    subjectName: Option<string>)

  datatype Teacher = Teacher(
    id: string,
    name: string,
    email: string,
    phone: string,
    address: string,
    subjects: seq<Subject>,
    password: string,
    isActive: bool,
    createdBy: string,
    createdAt: string,
    totalEarnings: Option<real>,
    lastLogin: Option<string>)

  /** A registered user as the service stores it: `{email, password}`, with
      a `subjects` list once a subject has been added for that user. */
  datatype User = User(email: string, password: string, subjects: Option<seq<Subject>>)
}
