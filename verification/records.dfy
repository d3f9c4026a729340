/** The in-memory lead record of `agent.py` (the dictionaries held in
    `lead_states`) and the two enumerations it carries. */
module Records {

  /** A Python value that is either `None` or present. */
  datatype Option<T> = None | Some(value: T)

  /** The question a lead is expected to answer next. */
  datatype Step = Consent | Age | Country | Interest {

    /** Position in the fixed question order. */
    function Rank(): nat {
      match this
      case Consent => 0
      case Age => 1
      case Country => 2
      case Interest => 3
    }

    /** The string stored under the record's `'step'` key. */
    function Name(): string {
      match this
      case Consent => "consent"
      case Age => "age"
      case Country => "country"
      case Interest => "interest"
    }
  }

  datatype Status = Pending | FollowedUp | Secured | NoResponse {

    /** `secured` and `no_response` end the conversation. */
    predicate Terminal() {
      this == Secured || this == NoResponse
    }

    /** The string stored in the record and in the table's `status` column. */
    function Name(): string {
      match this
      case Pending => "pending"
      case FollowedUp => "followed_up"
      case Secured => "secured"
      case NoResponse => "no_response"
    }
  }

  /** One entry of `lead_states`. The answers are absent (`None`) until the
      step that asks for them has been answered; `lastInteraction` is a
      timestamp in microseconds. */
  datatype Lead = Lead(
    name: string,
    status: Status,
    step: Step,
    lastInteraction: int,
    age: Option<string>,
    country: Option<string>,
    interest: Option<string>)
}
