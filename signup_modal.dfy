/** The sign-up modal component itself: its three pieces of React state, and the
    two effects its handlers trigger (`onClose`, `alert`) recorded as fields.
    Each handler is a guarded sequence of updates with early returns, proved to
    leave the component in the state the matching function of `SignUpForm` gives. */
module Modal {
  import opened Text
  import opened Uniqueness
  import opened SignUpForm

  class SignUpModal {
    var username: string
    var email: string
    var progress: int
    /** Whether `onClose` has been called. */
    var closed: bool
    /** The texts passed to `alert`, oldest first. */
    var alerts: seq<string>

    /** The component's state as a value. */
    function State(): Form
      reads this
    {
      Form(username, email, progress, closed, alerts)
    }

    /** The progress bar only ever shows 0, 25 or 50. */
    ghost predicate Valid()
      reads this
    {
      ValidProgress(progress)
    }

    /** Mounting: empty fields, empty bar, open, nothing shown yet. */
    constructor ()
      ensures Valid()
      ensures State() == Initial
    {
      username := "";
      email := "";
      progress := 0;
      closed := false;
      alerts := [];
    }

    /** `bothFilled`: whether the "Next" button is rendered. */
    function NextVisible(): (r: bool)
      reads this
      ensures r <==> IsFilled(username) && IsFilled(email)
    {
      BothFilled(username, email)
    }

    /** `handleNext`. */
    method HandleNext()
      requires Valid()
      modifies this
      ensures Valid()
      ensures State() == Next(old(State()))
      ensures username == old(username) && email == old(email) && progress == old(progress)
      ensures alerts == old(alerts) + [Message(Decide(old(username), old(email)))]
      ensures closed == (old(closed) || Closes(Decide(old(username), old(email))))
    {
      if username == "" || email == "" {
        alerts := alerts + [RequiredMessage];
        return;
      }
      if !IsUnique("username", username) {
        alerts := alerts + [UsernameInUseMessage];
        closed := true;
        return;
      }
      if !IsUnique("email", email) {
        alerts := alerts + [EmailInUseMessage];
        closed := true;
        return;
      }
      alerts := alerts + [ProceedMessage];
    }

    /** `handleUsernameBlur`. */
    method HandleUsernameBlur()
      requires Valid()
      modifies this`progress
      ensures Valid()
      ensures State() == UsernameBlur(old(State()))
      ensures progress == if IsFilled(username) then UsernameStepProgress else old(progress)
    {
      if Trim(username) != "" {
        progress := UsernameStepProgress;
      }
    }

    /** `handleEmailBlur`. */
    method HandleEmailBlur()
      requires Valid()
      modifies this`progress
      ensures Valid()
      ensures State() == EmailBlur(old(State()))
      ensures progress == if IsFilled(email) then EmailStepProgress else old(progress)
    {
      if Trim(email) != "" {
        progress := EmailStepProgress;
      }
    }

    /** The username input's `onChange`. */
    method ChangeUsernameTo(value: string)
      requires Valid()
      modifies this`username
      ensures Valid()
      ensures State() == ChangeUsername(old(State()), value)
      ensures username == value
    {
      username := value;
    }

    /** The email input's `onChange`. */
    method ChangeEmailTo(value: string)
      requires Valid()
      modifies this`email
      ensures Valid()
      ensures State() == ChangeEmail(old(State()), value)
      ensures email == value
    {
      email := value;
    }

    /** The "Cancel" button. */
    method HandleCancel()
      requires Valid()
      modifies this`closed
      ensures Valid()
      ensures State() == Cancel(old(State()))
      ensures closed
    {
      closed := true;
    }

    /** `handleNext` when it can be clicked: the required-fields alert never appears. */
    method ClickVisibleNext()
      requires Valid() && NextVisible()
      modifies this
      ensures Valid()
      ensures State() == Next(old(State()))
      ensures alerts[|alerts| - 1] != RequiredMessage
    {
      VisibleNextPassesGuard(State());
      HandleNext();
    }

    /** The handler the rendered markup wires to each user action. */
    method Dispatch(e: Event)
      requires Valid()
      modifies this
      ensures Valid()
      ensures State() == Step(old(State()), e)
    {
      match e
      case TypeUsername(v) => ChangeUsernameTo(v);
      case TypeEmail(v) => ChangeEmailTo(v);
      case LeaveUsername => HandleUsernameBlur();
      case LeaveEmail => HandleEmailBlur();
      case ClickNext => HandleNext();
      case ClickCancel => HandleCancel();
    }
  }
}
