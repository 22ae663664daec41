/** Record shapes of the three tables (src/app/types/index.ts), with the
    service-layer result shapes shared by every service. Timestamps are
    integers (seconds); a nullable column is an Option. */
module Types {

  datatype Option<+T> = None | Some(value: T)
  {
    /** The value if present, otherwise `default`. */
    function GetOr(default: T): T {
      if Some? then value else default
    }
  }

  /** Seconds on the store's clock. */
  type Timestamp = int

  datatype AdminUser = AdminUser(
    id: string,
    email: string,
    password: string,
    name: Option<string>,
    avatar_url: Option<string>,
    created_at: Timestamp)

  datatype Session = Session(
    id: string,
    user_id: string,
    expires_at: Timestamp,
    created_at: Timestamp)

  datatype Section = Section(
    id: int,
    title: string,
    description: Option<string>,
    image_url: Option<string>,
    created_at: Timestamp)

  /** `{ data, error }`: the shape every query of the services returns. */
  datatype DataResult<T> = DataResult(data: Option<T>, error: Option<string>)
  {
    /** Exactly one of payload and error is present. */
    predicate WellFormed() {
      data.Some? <==> error.None?
    }
  }

  /** `{ success, error }`: the shape every update of the services returns. */
  datatype Outcome = Outcome(success: bool, error: Option<string>)
  {
    /** success is reported exactly when no error is. */
    predicate WellFormed() {
      success <==> error.None?
    }
  }

  function Failed<T>(message: string): DataResult<T> {
    DataResult(None, Some(message))
  }

  function Found<T>(x: T): DataResult<T> {
    DataResult(Some(x), None)
  }

  const Succeeded: Outcome := Outcome(true, None)

  function Refused(message: string): Outcome {
    Outcome(false, Some(message))
  }
}
